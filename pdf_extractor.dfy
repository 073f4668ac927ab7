/**
 * Selecting one paragraph of one page of a PDF (`extract_paragraph`).
 *
 * The PDF library is not modelled: the document is given as whether its path
 * exists and the list of texts its pages extract to. What remains is the range
 * checks, the two-tier segmentation of the page text and the result record.
 */
module PdfExtractor {
  import opened PyStr

  /** Blank-line separator of the first segmentation strategy. */
  const ParagraphSep: string := "\n\n"
  /** Line separator of the fallback strategy. */
  const LineSep: string := "\n"

  /** What `extract_paragraph` returns, or the exception it raises. */
  datatype Extraction =
    | Ok(text: string, page: int, paragraphIndex: int, length: nat)
    | FileNotFound(path: string)
    | PageOutOfRange(page: int)
    | ParagraphOutOfRange(paragraphIndex: int, page: int, count: nat)

  /** `[p.strip() for p in pieces if p.strip()]` */
  function NonBlankStripped(pieces: seq<string>): (r: seq<string>)
    ensures |r| <= |pieces|
    ensures forall k :: 0 <= k < |r| ==> r[k] != [] && IsStripped(r[k])
    decreases |pieces|
  {
    if pieces == [] then []
    else
      var p := Strip(pieces[0]);
      (if p != [] then [p] else []) + NonBlankStripped(pieces[1..])
  }

  /** How many pieces hold a character other than whitespace. */
  function CountNonBlank(pieces: seq<string>): nat
    decreases |pieces|
  {
    if pieces == [] then 0
    else (if AllSpace(pieces[0]) then 0 else 1) + CountNonBlank(pieces[1..])
  }

  /** One paragraph per non-blank piece. */
  lemma {:induction false} NonBlankStrippedCount(pieces: seq<string>)
    ensures |NonBlankStripped(pieces)| == CountNonBlank(pieces)
    decreases |pieces|
  {
    if pieces != [] {
      NonBlankStrippedCount(pieces[1..]);
    }
  }

  /** No piece is non-blank exactly when every piece is whitespace. */
  lemma {:induction false} CountNonBlankZero(pieces: seq<string>)
    ensures CountNonBlank(pieces) == 0 <==> forall i :: 0 <= i < |pieces| ==> AllSpace(pieces[i])
    decreases |pieces|
  {
    if pieces != [] {
      CountNonBlankZero(pieces[1..]);
      assert forall i :: 1 <= i < |pieces| ==> pieces[i] == pieces[1..][i - 1];
    }
  }

  /** The filter works piece by piece, so it keeps the pieces' order. */
  lemma {:induction false} NonBlankStrippedAppend(a: seq<string>, b: seq<string>)
    ensures NonBlankStripped(a + b) == NonBlankStripped(a) + NonBlankStripped(b)
    decreases |a|
  {
    if a == [] {
      assert a + b == b;
    } else {
      assert (a + b)[1..] == a[1..] + b;
      NonBlankStrippedAppend(a[1..], b);
    }
  }

  /** `p` is what `strip` makes of one of the pieces. */
  ghost predicate StripOfSome(p: string, pieces: seq<string>) {
    exists i :: 0 <= i < |pieces| && p == Strip(pieces[i])
  }

  /** The paragraph at position `k` is the stripped form of some piece. */
  lemma {:induction false} NonBlankStrippedAt(pieces: seq<string>, k: nat)
    requires k < |NonBlankStripped(pieces)|
    ensures exists i :: 0 <= i < |pieces| && NonBlankStripped(pieces)[k] == Strip(pieces[i])
    decreases |pieces|
  {
    var p := Strip(pieces[0]);
    var head := if p != [] then [p] else [];
    var tail := NonBlankStripped(pieces[1..]);
    assert NonBlankStripped(pieces) == head + tail;
    if k < |head| {
      assert NonBlankStripped(pieces)[k] == Strip(pieces[0]);
    } else {
      NonBlankStrippedAt(pieces[1..], k - |head|);
      var j :| 0 <= j < |pieces[1..]| && tail[k - |head|] == Strip(pieces[1..][j]);
      assert pieces[1..][j] == pieces[j + 1];
      assert NonBlankStripped(pieces)[k] == Strip(pieces[j + 1]);
    }
  }

  /** Every paragraph is the stripped form of some piece. */
  lemma NonBlankStrippedSound(pieces: seq<string>)
    ensures forall k :: 0 <= k < |NonBlankStripped(pieces)| ==> StripOfSome(NonBlankStripped(pieces)[k], pieces)
  {
    forall k | 0 <= k < |NonBlankStripped(pieces)|
      ensures StripOfSome(NonBlankStripped(pieces)[k], pieces)
    {
      NonBlankStrippedAt(pieces, k);
    }
  }

  /** Every non-blank piece, stripped, is a paragraph. */
  lemma {:induction false} NonBlankStrippedComplete(pieces: seq<string>)
    ensures forall i :: 0 <= i < |pieces| && !AllSpace(pieces[i]) ==>
      Strip(pieces[i]) in NonBlankStripped(pieces)
    decreases |pieces|
  {
    if pieces != [] {
      NonBlankStrippedComplete(pieces[1..]);
      var p := Strip(pieces[0]);
      var tail := NonBlankStripped(pieces[1..]);
      assert NonBlankStripped(pieces) == (if p != [] then [p] else []) + tail;
      forall i | 0 <= i < |pieces| && !AllSpace(pieces[i])
        ensures Strip(pieces[i]) in NonBlankStripped(pieces)
      {
        if i > 0 {
          assert pieces[i] == pieces[1..][i - 1];
        }
      }
    }
  }

  /** Segmentation of one page's text: the stripped non-empty blocks between
      blank lines when there are at least two, otherwise the stripped non-empty
      lines. */
  function Segment(fullText: string): (r: seq<string>)
    ensures forall k :: 0 <= k < |r| ==> r[k] != [] && IsStripped(r[k])
  {
    var blocks := NonBlankStripped(Split(fullText, ParagraphSep));
    if |blocks| <= 1 then NonBlankStripped(Split(fullText, LineSep)) else blocks
  }

  /** With at least two non-blank blocks, the blocks are the paragraphs. */
  lemma SegmentByBlocks(fullText: string)
    requires CountNonBlank(Split(fullText, ParagraphSep)) >= 2
    ensures Segment(fullText) == NonBlankStripped(Split(fullText, ParagraphSep))
    ensures |Segment(fullText)| == CountNonBlank(Split(fullText, ParagraphSep))
  {
    NonBlankStrippedCount(Split(fullText, ParagraphSep));
  }

  /** A paragraph found by the first strategy never spans a blank-line
      separator: each one lies inside a single block of the split. */
  lemma BlockParagraphsHoldNoSeparator(fullText: string)
    requires CountNonBlank(Split(fullText, ParagraphSep)) >= 2
    ensures forall k :: 0 <= k < |Segment(fullText)| ==> !Contains(Segment(fullText)[k], ParagraphSep)
  {
    var pieces := Split(fullText, ParagraphSep);
    SegmentByBlocks(fullText);
    SplitPiecesFree(fullText, ParagraphSep);
    forall k | 0 <= k < |Segment(fullText)| ensures !Contains(Segment(fullText)[k], ParagraphSep) {
      NonBlankStrippedAt(pieces, k);
      var i :| 0 <= i < |pieces| && NonBlankStripped(pieces)[k] == Strip(pieces[i]);
      ContainsStrip(pieces[i]);
      ContainsWithinWhen(pieces[i], Strip(pieces[i]), ParagraphSep);
    }
  }

  /** With at most one non-blank block, every non-blank line is a paragraph. */
  lemma SegmentByLines(fullText: string)
    requires CountNonBlank(Split(fullText, ParagraphSep)) <= 1
    ensures Segment(fullText) == NonBlankStripped(Split(fullText, LineSep))
    ensures |Segment(fullText)| == CountNonBlank(Split(fullText, LineSep))
  {
    NonBlankStrippedCount(Split(fullText, ParagraphSep));
    NonBlankStrippedCount(Split(fullText, LineSep));
  }

  /** If the joined text is whitespace, so is each part. */
  lemma {:induction false} JoinedSpaceParts(sep: string, parts: seq<string>)
    requires AllSpace(Join(sep, parts))
    ensures forall i :: 0 <= i < |parts| ==> AllSpace(parts[i])
    decreases |parts|
  {
    if |parts| > 1 {
      var j := Join(sep, parts);
      var tail := Join(sep, parts[1..]);
      assert j == parts[0] + sep + tail;
      assert AllSpace(parts[0]) by {
        forall k | 0 <= k < |parts[0]| ensures IsSpace(parts[0][k]) { assert parts[0][k] == j[k]; }
      }
      assert AllSpace(tail) by {
        forall k | 0 <= k < |tail| ensures IsSpace(tail[k]) {
          assert tail[k] == j[|parts[0]| + |sep| + k];
        }
      }
      JoinedSpaceParts(sep, parts[1..]);
      assert forall i :: 1 <= i < |parts| ==> parts[i] == parts[1..][i - 1];
    }
  }

  /** A whitespace-only page yields no paragraph. */
  lemma BlankSegmentsEmpty(fullText: string)
    requires AllSpace(fullText)
    ensures Segment(fullText) == []
  {
    var lines := Split(fullText, LineSep);
    JoinSplit(fullText, LineSep);
    JoinedSpaceParts(LineSep, lines);
    CountNonBlankZero(lines);
    NonBlankStrippedCount(lines);
    var blocks := Split(fullText, ParagraphSep);
    JoinSplit(fullText, ParagraphSep);
    JoinedSpaceParts(ParagraphSep, blocks);
    CountNonBlankZero(blocks);
    NonBlankStrippedCount(blocks);
  }

  /** A page with any visible character yields at least one paragraph. */
  lemma EmptySegmentsBlank(fullText: string)
    requires Segment(fullText) == []
    ensures AllSpace(fullText)
  {
    var lines := Split(fullText, LineSep);
    assert Segment(fullText) == NonBlankStripped(lines);
    NonBlankStrippedCount(lines);
    CountNonBlankZero(lines);
    JoinAllSpace(LineSep, lines);
    JoinSplit(fullText, LineSep);
  }

  /** A page yields no paragraph exactly when its text is all whitespace. */
  lemma SegmentEmptyIffBlank(fullText: string)
    ensures Segment(fullText) == [] <==> AllSpace(fullText)
  {
    if AllSpace(fullText) { BlankSegmentsEmpty(fullText); }
    if Segment(fullText) == [] { EmptySegmentsBlank(fullText); }
  }

  /** `extract_paragraph(pdf_path, page_number, paragraph_index)` on a document
      whose path exists when `fileExists` holds and whose pages extract to `pages`. */
  function ExtractParagraph(path: string, fileExists: bool, pages: seq<string>,
                            pageNumber: int, paragraphIndex: int): (r: Extraction)
    ensures !fileExists ==> r == FileNotFound(path)
    ensures fileExists && !(1 <= pageNumber <= |pages|) ==> r == PageOutOfRange(pageNumber)
    ensures r.Ok? <==>
      fileExists && 1 <= pageNumber <= |pages| && 0 <= paragraphIndex < |Segment(pages[pageNumber - 1])|
    ensures r.Ok? ==>
      && 1 <= pageNumber <= |pages|
      && 0 <= paragraphIndex < |Segment(pages[pageNumber - 1])|
      && r.text == Segment(pages[pageNumber - 1])[paragraphIndex]
      && r.text != [] && IsStripped(r.text)
      && r.length == |r.text|
      && r.page == pageNumber && r.paragraphIndex == paragraphIndex
    ensures fileExists && 1 <= pageNumber <= |pages|
            && !(0 <= paragraphIndex < |Segment(pages[pageNumber - 1])|) ==>
      r == ParagraphOutOfRange(paragraphIndex, pageNumber, |Segment(pages[pageNumber - 1])|)
    ensures r.ParagraphOutOfRange? ==>
      && fileExists && 1 <= pageNumber <= |pages|
      && r.count == |Segment(pages[pageNumber - 1])|
      && (paragraphIndex < 0 || paragraphIndex >= r.count)
      && r.page == pageNumber && r.paragraphIndex == paragraphIndex
  {
    if !fileExists then FileNotFound(path)
    else
      // pages are numbered from 1 for the caller and from 0 internally
      if pageNumber - 1 < 0 || pageNumber - 1 >= |pages| then PageOutOfRange(pageNumber)
      else
        var paragraphs := Segment(pages[pageNumber - 1]);
        if paragraphIndex < 0 || paragraphIndex >= |paragraphs| then
          ParagraphOutOfRange(paragraphIndex, pageNumber, |paragraphs|)
        else
          var target := paragraphs[paragraphIndex];
          Ok(target, pageNumber, paragraphIndex, |target|)
  }

  /** A page without visible text is a range error that reports zero paragraphs,
      whatever index is asked for (index 0 included): never an empty paragraph. */
  lemma BlankPageHasNoParagraph(path: string, pages: seq<string>, pageNumber: int, paragraphIndex: int)
    requires 1 <= pageNumber <= |pages| && AllSpace(pages[pageNumber - 1])
    ensures ExtractParagraph(path, true, pages, pageNumber, paragraphIndex)
         == ParagraphOutOfRange(paragraphIndex, pageNumber, 0)
  {
    SegmentEmptyIffBlank(pages[pageNumber - 1]);
  }

  /** A page made of two single-line paragraphs separated by a blank line: the
      first strategy applies, and paragraph 0 and paragraph 1 are the two lines. */
  lemma TwoParagraphPage(path: string, one: string, two: string)
    requires one != [] && two != [] && IsStripped(one) && IsStripped(two)
    requires '\n' !in one && '\n' !in two
    ensures ExtractParagraph(path, true, [one + ParagraphSep + two], 1, 0) == Ok(one, 1, 0, |one|)
    ensures ExtractParagraph(path, true, [one + ParagraphSep + two], 1, 1) == Ok(two, 1, 1, |two|)
    ensures ExtractParagraph(path, true, [one + ParagraphSep + two], 1, 2) == ParagraphOutOfRange(2, 1, 2)
  {
    var text := one + ParagraphSep + two;
    SplitAt(one, ParagraphSep, two);
    NotContainsMissingChar(two, ParagraphSep, '\n');
    SplitWithout(two, ParagraphSep);
    assert Split(text, ParagraphSep) == [one, two];
    StripOfStripped(one);
    StripOfStripped(two);
    assert NonBlankStripped([two]) == [two];
    assert NonBlankStripped([one, two]) == [one, two];
    assert Segment(text) == [one, two];
  }

  /** The page "Para one.", blank line, "Para two.": paragraph 1 is "Para two.". */
  lemma TwoParagraphExample(page: string)
    requires page == "Para one.\n\nPara two."
    ensures ExtractParagraph("doc.pdf", true, [page], 1, 1) == Ok("Para two.", 1, 1, 9)
  {
    var one, two := "Para one.", "Para two.";
    assert page == one + ParagraphSep + two;
    TwoParagraphPage("doc.pdf", one, two);
  }
}
