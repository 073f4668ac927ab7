# Transcript mind-map pipeline: a verified model of its core

The pipeline takes one paragraph of a PDF page, has a language model turn it
into a topic hierarchy, and draws that hierarchy as a Mermaid mind map in an
HTML page. This project models the deterministic parts of that pipeline in
Dafny and proves properties of them:

- `PdfExtractor` (`pdf_extractor.dfy`): `extract_paragraph`. It checks that the
  file exists and that the page number is in range. It splits the page text
  into paragraphs: first by blank lines, then by single lines when at most one
  block results. It then picks a paragraph by index. Each exception that
  `extract_paragraph` raises itself is modelled as a constructor of
  `Extraction`.
- `MindmapService` (`mindmap_service.dfy`):
  - `clean_json_response`, the removal of Markdown fences around the model's
    reply;
  - the parse-failure sentinel tree of `generate_mindmap_json`;
  - the recursive `json_to_mermaid` numbering, as a function (`Render`) and as
    the loop the source runs (`JsonToMermaid`);
  - the graph text and the HTML document of `save_mindmap_html`.
- `CliMindmap` (`cli_mindmap.dfy`): how the command-line driver derives the
  transcript (`.txt`) and JSON (`.json`) file names from the `--output` name.
- `PyStr` (`pystr.dfy`) defines the Python string operations these rely on:
  - `isspace` and `strip`;
  - `split` and `join` on a literal separator;
  - `replace` of a literal, and the `in` test for substrings;
  - the decimal rendering of node numbers.

  `Wrappers` (`wrappers.dfy`) holds `Option`.

The model's main results:

- A page yields no paragraph exactly when its text is all whitespace. Every
  paragraph returned is non-empty and stripped.
- A reply wrapped in a ```` ```json ```` fence, whose body holds no backtick,
  cleans down to its stripped body. A reply without backticks is only stripped.
- The Mermaid lines number the nodes of the tree in pre-order, with one line per
  node. Each line other than the first is an edge from a node declared earlier.
  Each child's subtree is a contiguous block, and sibling blocks come in input
  order.
- Each rendered line holds exactly the two double quotes that delimit its label.
  Every node's sanitised label appears in the HTML document.
- The transcript, JSON and HTML file names are pairwise distinct for every
  `--output` name.

## Model

| member | source | states |
|---|---|---|
| PdfExtractor.ExtractParagraph | backend/pdf_extractor.py:13-75 | A missing file gives `FileNotFound`, a page outside `1..len(pages)` gives `PageOutOfRange`. The result is `Ok` exactly when the file exists, the page is in range and the index is within that page's paragraphs. It then carries that paragraph (non-empty, stripped), its length, the page number and the index. An index outside the paragraphs of an existing, in-range page gives `ParagraphOutOfRange` with that index, the page number and the page's paragraph count. |
| PdfExtractor.NonBlankStripped | backend/pdf_extractor.py:35 | The list comprehension keeps at most as many pieces as it is given, and each one kept is non-empty and stripped. |
| PdfExtractor.NonBlankStrippedCount | backend/pdf_extractor.py:35 | It yields exactly one paragraph per piece that is not all whitespace. |
| PdfExtractor.CountNonBlankZero | backend/pdf_extractor.py:35 | No piece counts as non-blank exactly when every piece is whitespace. |
| PdfExtractor.NonBlankStrippedAppend | backend/pdf_extractor.py:35 | The filter works piece by piece: filtering a concatenation concatenates the results, so order is kept. |
| PdfExtractor.NonBlankStrippedAt | backend/pdf_extractor.py:35 | The paragraph at each position is `strip()` of some piece. |
| PdfExtractor.NonBlankStrippedSound | backend/pdf_extractor.py:35 | Every paragraph produced is the stripped form of one of the pieces. |
| PdfExtractor.NonBlankStrippedComplete | backend/pdf_extractor.py:35 | Every piece that is not all whitespace, once stripped, is among the paragraphs. |
| PdfExtractor.Segment | backend/pdf_extractor.py:35-45 | Every paragraph of a page is non-empty and stripped. |
| PdfExtractor.SegmentByBlocks | backend/pdf_extractor.py:35-39 | With two or more non-blank `\n\n` blocks, the paragraphs are those blocks stripped, one per non-blank block. |
| PdfExtractor.BlockParagraphsHoldNoSeparator | backend/pdf_extractor.py:35 | When the blank-line strategy applies, no paragraph contains a blank-line separator: each lies inside one block of the split. |
| PdfExtractor.SegmentByLines | backend/pdf_extractor.py:39-45 | With at most one non-blank block, the paragraphs are the non-blank lines stripped, one per non-blank line. |
| PdfExtractor.JoinedSpaceParts | backend/pdf_extractor.py:35 | If the joined pieces are all whitespace, so is each piece. |
| PdfExtractor.BlankSegmentsEmpty | backend/pdf_extractor.py:35-45 | A whitespace-only page has no paragraph under either strategy. |
| PdfExtractor.EmptySegmentsBlank | backend/pdf_extractor.py:39-45 | A page with no paragraph has whitespace-only text. |
| PdfExtractor.SegmentEmptyIffBlank | backend/pdf_extractor.py:35-45 | A page has no paragraph if and only if its text is all whitespace. |
| PdfExtractor.BlankPageHasNoParagraph | backend/pdf_extractor.py:47-55 | On a whitespace-only page, every index, 0 included, is a range error reporting zero paragraphs. No empty paragraph is ever returned. |
| PdfExtractor.TwoParagraphPage | backend/pdf_extractor.py:35-57 | Two stripped single-line paragraphs separated by a blank line come out as paragraph 0 and paragraph 1. Index 2 is out of range, with a reported count of 2. |
| PdfExtractor.TwoParagraphExample | backend/pdf_extractor.py:35-57 | On the page "Para one.", blank line, "Para two.", paragraph 1 is "Para two.", of length 9. |
| MindmapService.RemoveJsonFences | backend/mindmap_service.py:31 | Removing every opening fence with the whitespace after it never lengthens the reply. |
| MindmapService.TrailingFenceFrom | backend/mindmap_service.py:32 | The regex scan finds only positions where three backticks are followed by nothing but whitespace. |
| MindmapService.CleanJsonResponse | backend/mindmap_service.py:26-33 | The cleaned reply is stripped. |
| MindmapService.FenceAtEnd | backend/mindmap_service.py:32 | A closing fence followed only by whitespace ends exactly where the trailing whitespace begins. |
| MindmapService.FenceAtUnique | backend/mindmap_service.py:32 | `` ```\s*$ `` can match at one position at most. |
| MindmapService.ScanFinds | backend/mindmap_service.py:32 | If there is a match at or after the scan's start, the scan finds it. |
| MindmapService.ScanMisses | backend/mindmap_service.py:32 | If there is no match, the scan finds nothing. |
| MindmapService.RemoveTrailingFence | backend/mindmap_service.py:32 | The closing-fence substitution only ever cuts off a tail: its result is a prefix of its input. |
| MindmapService.RemoveTrailingFenceCuts | backend/mindmap_service.py:32 | When three backticks precede the trailing whitespace, they are cut off together with everything after them. |
| MindmapService.FenceBeforeTrailingRun | backend/mindmap_service.py:32 | Three backticks just before the trailing whitespace are a regex match. |
| MindmapService.RemoveTrailingFenceAt | backend/mindmap_service.py:32 | Where the pattern matches, the text is cut at the match. |
| MindmapService.RemoveTrailingFenceKeeps | backend/mindmap_service.py:32 | When no three backticks precede the trailing whitespace, the text is unchanged. |
| MindmapService.RemoveJsonFencesPassesPrefix | backend/mindmap_service.py:31 | Text at no position of which an opening fence starts passes through the opening-fence removal unchanged, whatever follows it. |
| MindmapService.NoBacktickNoOpening | backend/mindmap_service.py:31 | No opening fence starts inside text without a backtick. |
| MindmapService.RemoveJsonFencesLeftmost | backend/mindmap_service.py:31 | At the leftmost opening fence, the substitution keeps all text before it, drops the fence with the whole whitespace run after it, and continues on the rest. |
| MindmapService.RemoveJsonFencesAbsent | backend/mindmap_service.py:31 | Without ```` ```json ```` in the reply, the first substitution changes nothing. |
| MindmapService.RemoveJsonFencesAtFence | backend/mindmap_service.py:31 | An opening fence is removed together with all the whitespace after it. |
| MindmapService.OpeningFenceRemoved | backend/mindmap_service.py:31 | An opening fence, whitespace and a backtick-free body, followed by a rest that starts with a backtick and contains no `j` (such as the closing fence and its whitespace), leave only the body without its leading whitespace, followed by that rest. |
| MindmapService.ClosingFenceRemoved | backend/mindmap_service.py:32 | A closing fence followed only by whitespace is cut off whatever precedes it. |
| MindmapService.CleanWithoutBackticks | backend/mindmap_service.py:26-33 | A reply without a backtick is only stripped. |
| MindmapService.CleanFencedJson | backend/mindmap_service.py:26-33 | A reply of the form ```` ```json ````, whitespace, body without backticks, ```` ``` ````, whitespace cleans to the stripped body. |
| MindmapService.Label | backend/mindmap_service.py:97 | The label is `name` when present, else `root` when present, else `"Topic"`. |
| MindmapService.MindmapFromReply | backend/mindmap_service.py:66-81 | The reply is cleaned, then parsed. A successful parse gives the parsed tree. A decode failure gives the sentinel tree `ErrorTree` (a constant), "Error Parsing JSON" with the single child "Raw Text", as at lines 78-81. |
| MindmapService.Sanitize | backend/mindmap_service.py:97 | The sanitised label keeps the length of the label and holds no double quote. |
| MindmapService.SanitizePointwise | backend/mindmap_service.py:97 | Each double quote becomes a single quote, and every other character stays where it was. |
| MindmapService.SanitizeClean | backend/mindmap_service.py:97 | A label without double quotes is left unchanged. |
| MindmapService.NodeLine | backend/mindmap_service.py:99-102 | The line declares the given node with the given label. It is an edge from the parent when there is one, and a standalone declaration only when there is none. |
| MindmapService.Render | backend/mindmap_service.py:92-110 | Defines `json_to_mermaid` recursively: the node's own line, then the lines of the loop over its children, and the counter the loop ends with. Its properties are stated by `RenderShape`, `ChildBlock` and `RenderSize`. |
| MindmapService.RenderChildren | backend/mindmap_service.py:104-108 | Defines the loop over the children from the `k`-th on: each child rendered under the node from the current counter, the counter then taken from that call. Its properties are stated by `RenderChildrenShape` and `ChildrenBlock`. |
| MindmapService.Preorder | backend/mindmap_service.py:104-108 | The traversal order the numbering follows starts with the node itself. |
| MindmapService.RenderShape | backend/mindmap_service.py:92-110 | A subtree's lines declare its nodes in pre-order with consecutive numbers from `node_id` and with their sanitised labels. The first line is the node's own. Every later line is an edge from the parent or from a node declared earlier. The returned counter is `node_id` plus the number of lines. |
| MindmapService.RenderChildrenShape | backend/mindmap_service.py:104-108 | The loop over the children emits their pre-order with consecutive numbers from the counter. Every line is an edge from the parent or from a node declared earlier. The counter ends advanced by the number of lines. |
| MindmapService.MermaidLines | backend/mindmap_service.py:112 | The lines for a whole tree are never empty, and the first is the standalone declaration of node 0 with the top node's sanitised label. |
| MindmapService.MermaidLinesShape | backend/mindmap_service.py:112 | For a whole tree there is one line per node. Line 0 is the top node's standalone declaration (`node0`). Line `i` declares node `i`, the `i`-th node in pre-order. Every later line is an edge whose parent has a smaller number. |
| MindmapService.RenderSize | backend/mindmap_service.py:92-110 | A rendering has one line per node and advances the counter by the subtree's size. |
| MindmapService.ChildBlock | backend/mindmap_service.py:104-108 | The `j`-th child's subtree occupies one contiguous block of lines. The block sits after the node's line and the earlier siblings' blocks, and it is the child's own rendering under the node, numbered from where the block starts. |
| MindmapService.SizesBetweenExtend | backend/mindmap_service.py:104-108 | The children before `j + 1` take up the lines of the children before `j` plus the `j`-th child's subtree. |
| MindmapService.SiblingBlocksAdjacent | backend/mindmap_service.py:104-108 | The first child's block starts right after the node's line. Child `j + 1`'s block starts right where child `j`'s block ends, so siblings keep input order. |
| MindmapService.RenderChildrenStep | backend/mindmap_service.py:105-108 | One loop round renders the next child from the current counter. The rest of the loop continues from the counter that call returns. |
| MindmapService.ChildrenBlock | backend/mindmap_service.py:104-108 | From any loop position, each later child's block appears at the offset given by the sizes of the children between. |
| MindmapService.ErrorTreeRendering | backend/mindmap_service.py:78-81 | The sentinel tree renders as `node0["Error Parsing JSON"]` and the edge `node0 --> node1["Raw Text"]`, with next id 2. |
| MindmapService.OneLeafRendering | backend/mindmap_service.py:92-110 | A `root` title with one named leaf gives one declaration and one edge from node 0 to node 1. |
| MindmapService.TwoLeavesRendering | backend/tests/test_mindmap.py:32-38 | A top node with two leaves gives a declaration, then the edges to node 1 and node 2, in input order. |
| MindmapService.JsonToMermaid | backend/mindmap_service.py:92-110 | The loop that builds the list with `append` and `extend` returns exactly the rendering the recursive definition describes. Its line count is the subtree's size, and the returned counter is `node_id` plus that size. |
| MindmapService.QuotedLabelCount | backend/mindmap_service.py:100-102 | A quote-free label between `["` and `"]` after quote-free text gives exactly two double quotes. |
| MindmapService.LineTextQuotes | backend/mindmap_service.py:100-102 | A line whose label has no double quote holds exactly the two that delimit the label. |
| MindmapService.RenderedLinesBalanced | backend/mindmap_service.py:97-102 | Every rendered line of any tree holds exactly two double quotes, so no label can break out of its string. |
| MindmapService.LineText | backend/mindmap_service.py:100-102 | Each line's text starts with four spaces and `node`, and ends with `"]`. |
| MindmapService.LineTexts | backend/mindmap_service.py:113 | The lines' texts are listed one per line, in order. |
| MindmapService.MermaidGraph | backend/mindmap_service.py:113 | The graph text starts with `graph TD` and a newline. |
| MindmapService.MindmapHtml | backend/mindmap_service.py:115-129 | The document starts with the fixed template head and contains the graph text. |
| MindmapService.SaveMindmapHtml | backend/mindmap_service.py:112-129 | The document is the fixed HTML template around `"graph TD\n"` and the lines joined by newlines. |
| MindmapService.GraphInsideMermaidBlock | backend/mindmap_service.py:120-122 | The graph text sits between `<pre class="mermaid">` and `</pre>`, each on a line of its own. |
| MindmapService.LabelsInDocument | backend/mindmap_service.py:97-129 | The sanitised label of every node of the tree appears in the HTML document. |
| MindmapService.PreorderOfTwoLeaves | backend/tests/test_mindmap.py:32-38 | A node with two leaf children lists itself, then its two children. |
| MindmapService.TwoLeavesDocument | backend/tests/test_mindmap.py:30-51 | For a `root` title with two named leaves and no double quotes, the document contains `mermaid`, the title and both leaf names. |
| MindmapService.ContainsMermaidWord | backend/mindmap_service.py:120 | Text that starts with the opening tag contains the word `mermaid`. |
| MindmapService.JoinContainsPart | backend/mindmap_service.py:113 | Each line's text occurs in the newline-joined graph. |
| CliMindmap.CompanionName | backend/cli_mindmap.py:46-48 | The derived name always differs from the `--output` name. |
| CliMindmap.CompanionOfHtmlName | backend/cli_mindmap.py:46-48 | When the name contains `.html`, every occurrence of it is replaced by the extension. |
| CliMindmap.CompanionOfOtherName | backend/cli_mindmap.py:46-48 | When the name has no `.html`, the extension is appended. |
| CliMindmap.CompanionOfStem | backend/cli_mindmap.py:46-48 | `stem.html`, with no other `.html` in it, becomes `stem` plus the extension. |
| CliMindmap.TranscriptName | backend/cli_mindmap.py:46-48 | The transcript name never equals the `--output` name. |
| CliMindmap.JsonName | backend/cli_mindmap.py:59-61 | The JSON name never equals the `--output` name. |
| CliMindmap.TranscriptAndJsonDiffer | backend/cli_mindmap.py:46-61 | The transcript and the JSON structure never go to the same file. |
| CliMindmap.PipelineOutputs | backend/cli_mindmap.py:46-69 | The HTML goes to `--output`. The transcript, JSON and HTML names are pairwise distinct, so no file overwrites another. |
| CliMindmap.DefaultOutputs | backend/cli_mindmap.py:24-28 | The default `final_mindmap.html` gives `final_mindmap.txt`, `final_mindmap.json` and `final_mindmap.html`. |
| PyStr.IsSpace | backend/pdf_extractor.py:35 | Defines the whitespace set of `str.isspace()`, which is also what `strip()` removes and what `\s` matches in `re`. |
| PyStr.Strip | backend/pdf_extractor.py:35 | `strip()` leaves no whitespace at either end, and gives the empty string exactly when the input is all whitespace. |
| PyStr.StripSlice | backend/mindmap_service.py:33 | `strip()` returns a slice of its input, and what it removes at both ends is whitespace. |
| PyStr.StripOfStripped | backend/pdf_extractor.py:35 | A stripped string is its own `strip()`. |
| PyStr.StripIdempotent | backend/pdf_extractor.py:35 | Stripping twice is stripping once. |
| PyStr.Split | backend/pdf_extractor.py:35 | `split` gives at least one piece, and the first piece is a prefix of the input. |
| PyStr.SplitWithout | backend/pdf_extractor.py:35 | A text without the separator splits into itself alone. |
| PyStr.SplitAt | backend/pdf_extractor.py:35 | A head that shares no character with the separator, followed by the separator, splits off as the first piece. |
| PyStr.Join | backend/mindmap_service.py:113 | Defines `sep.join(parts)`: the parts in order with the separator between consecutive ones. |
| PyStr.SplitPiecesFree | backend/pdf_extractor.py:35 | No piece of `split` contains the separator. |
| PyStr.JoinSplit | backend/pdf_extractor.py:35 | Joining the pieces of `split` with the same separator gives back the text. |
| PyStr.JoinAllSpace | backend/pdf_extractor.py:43 | When the pieces and the separator are all whitespace, so is their join. |
| PyStr.Replace | backend/cli_mindmap.py:46 | Defines `s.replace(pat, rep)` for a non-empty literal: every leftmost non-overlapping occurrence replaced, scanning left to right. |
| PyStr.Contains | backend/tests/test_mindmap.py:49-51 | Defines the substring test `p in s`: `p` is a prefix of some suffix of `s`. |
| PyStr.ContainsWithin | backend/tests/test_mindmap.py:49-51 | The substring test `in` is transitive. |
| PyStr.PrefixContains | backend/tests/test_mindmap.py:49-51 | A substring of a prefix is a substring of the whole. |
| PyStr.ReplaceAbsent | backend/cli_mindmap.py:46 | `replace` of a pattern that does not occur changes nothing. |
| PyStr.ReplaceChanges | backend/cli_mindmap.py:47 | `replace` of a pattern that occurs, by something else, changes the text. |
| PyStr.ReplaceShortens | backend/cli_mindmap.py:46 | Replacing an occurring pattern by a shorter one shortens the text. |
| PyStr.ReplaceKeepsLength | backend/cli_mindmap.py:59 | Replacing by a pattern of the same length keeps the length. |
| PyStr.ReplaceChar | backend/mindmap_service.py:97 | Replacing one character by another acts position by position. |
| PyStr.ReplaceAtEnd | backend/cli_mindmap.py:46 | When the pattern's first character does not recur in it, a stem without the pattern followed by the pattern becomes the stem followed by the replacement. |
| PyStr.NatToString | backend/mindmap_service.py:94 | A node number's text is a non-empty run of decimal digits without a leading zero (except for 0). |
| PyStr.NatToStringRoundTrip | backend/mindmap_service.py:94 | The text of a number reads back as that number. |
| PyStr.NatToStringInjective | backend/mindmap_service.py:94 | Distinct node numbers get distinct names `node<n>`. |

## Left out

- The language-model call in `generate_mindmap_json` (client setup, prompt, temperature, JSON mode) is left out because it is network I/O. The reply is the `content` argument of `MindmapFromReply`.
- `json.loads` is represented by the `parse` parameter of `MindmapFromReply`: `None` stands for a `JSONDecodeError`. Other exceptions, which are re-raised, are not modelled.
- The tree is the `TopicNode` datatype, with optional string `name` and `root` and a list of child nodes. JSON values of other types in those keys are not modelled. At line 97, a `name` or `root` that is a number or `null` raises `AttributeError` at `.replace`. At line 105, a `children` that is a number or `null` raises `TypeError`. An empty string or empty object there iterates zero times and renders a leaf. A non-empty string or object, or a list whose entries are not objects, yields non-dict children on which `node.get` raises `AttributeError`.
- A reply that parses as valid JSON but is not an object (a list, a number, a string) is not modelled: `parse` yields only `TopicNode` trees. The source returns such a value from `generate_mindmap_json` (mindmap_service.py:67-72), and `save_mindmap_html` then raises `AttributeError` at `node.get` (line 97).
- A tree nested deeper than Python's recursion limit is not modelled. The source raises `RecursionError` on it, in `json.loads` or in the recursive call at mindmap_service.py:106. `Render` and `JsonToMermaid` render trees of every depth.
- The PDF reader is modelled as inputs: the existence check is the `fileExists` flag, and the reader's pages are the list of their extracted texts. Text extraction inside the reader is not part of this model, and neither are the exceptions the reader itself may raise when opening the file or extracting a page's text (lines 25 and 32), which lines 77-79 re-raise.
- The timing in `extract_paragraph`, the `extraction_time` field and all logging are left out: they depend on the clock and write to a log.
- The file writes are left out as I/O: the HTML in `save_mindmap_html`, and the transcript and `json.dump` in the CLI. `SaveMindmapHtml` returns the document text, and `CliMindmap` models the file names.
- The CLI's `argparse` handling, its `os.path.exists` check with `sys.exit(1)`, its success banner and its call into `process_pdf_paragraph` are left out. `transcript_service.py`, which does the cleaning, is not part of this model.
- The `__main__` demo blocks of the source files are left out.
- MindmapService.SaveMindmapHtml: the document's whitespace and script text are modelled exactly. The proofs state containment (labels, the word `mermaid`, the Mermaid block) rather than the full layout of the template.
- PdfExtractor.ExtractParagraph: the returned dictionary's `extraction_time` field is absent, as timing is left out.
