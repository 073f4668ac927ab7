/**
 * The file names the command-line pipeline writes: the transcript and the JSON
 * structure are saved beside the HTML mind map, their names derived from the
 * `--output` name.
 */
module CliMindmap {
  import opened PyStr

  const HtmlExt: string := ".html"
  const TxtExt: string := ".txt"
  const JsonExt: string := ".json"

  /** The `--output` name when none is given. */
  const DefaultOutput: string := "final_mindmap.html"

  /** `name = output.replace(".html", ext)`, then `name += ext` when the
      replacement changed nothing. */
  function CompanionName(output: string, ext: string): (r: string)
    ensures ext != [] ==> r != output
  {
    var replaced := Replace(output, HtmlExt, ext);
    if replaced == output then output + ext else replaced
  }

  /** With `.html` somewhere in the name, every occurrence is replaced. */
  lemma CompanionOfHtmlName(output: string, ext: string)
    requires Contains(output, HtmlExt) && ext != HtmlExt
    ensures CompanionName(output, ext) == Replace(output, HtmlExt, ext)
  {
    ReplaceChanges(output, HtmlExt, ext);
  }

  /** Without `.html` in the name, the extension is appended. */
  lemma CompanionOfOtherName(output: string, ext: string)
    requires !Contains(output, HtmlExt)
    ensures CompanionName(output, ext) == output + ext
  {
    ReplaceAbsent(output, HtmlExt, ext);
  }

  /** A name that ends in its only `.html` gets that extension swapped. */
  lemma CompanionOfStem(stem: string, ext: string)
    requires !Contains(stem, HtmlExt) && ext != HtmlExt
    ensures CompanionName(stem + HtmlExt, ext) == stem + ext
  {
    assert HtmlExt[0] !in HtmlExt[1..];
    ReplaceAtEnd(stem, HtmlExt, ext);
    assert stem + ext != stem + HtmlExt by {
      if |ext| == |HtmlExt| {
        assert (stem + ext)[|stem|..] == ext;
        assert (stem + HtmlExt)[|stem|..] == HtmlExt;
      }
    }
  }

  /** The transcript name (lines 46-48). */
  function TranscriptName(output: string): (r: string)
    ensures r != output
  {
    CompanionName(output, TxtExt)
  }

  /** The JSON name (lines 59-61). */
  function JsonName(output: string): (r: string)
    ensures r != output
  {
    CompanionName(output, JsonExt)
  }

  /** The transcript and the JSON structure never go to the same file: where
      `.html` is replaced, `.txt` shortens the name and `.json` keeps its
      length; where the extension is appended, the lengths differ by one. */
  lemma TranscriptAndJsonDiffer(output: string)
    ensures TranscriptName(output) != JsonName(output)
  {
    if Contains(output, HtmlExt) {
      CompanionOfHtmlName(output, TxtExt);
      CompanionOfHtmlName(output, JsonExt);
      ReplaceShortens(output, HtmlExt, TxtExt);
      ReplaceKeepsLength(output, HtmlExt, JsonExt);
    } else {
      CompanionOfOtherName(output, TxtExt);
      CompanionOfOtherName(output, JsonExt);
    }
  }

  /** The three files one run writes. */
  datatype OutputFiles = OutputFiles(transcript: string, json: string, html: string)

  /** The file names for `--output`, in the order the pipeline writes them. */
  function PipelineOutputs(output: string): (files: OutputFiles)
    ensures files.html == output
    ensures files.transcript != files.html && files.json != files.html
    ensures files.transcript != files.json
  {
    TranscriptAndJsonDiffer(output);
    OutputFiles(TranscriptName(output), JsonName(output), output)
  }

  /** With the default output name, `final_mindmap.html`, the companions are
      `final_mindmap.txt` and `final_mindmap.json`. */
  lemma DefaultOutputs(stem: string)
    requires stem == "final_mindmap"
    ensures stem + HtmlExt == DefaultOutput
    ensures PipelineOutputs(stem + HtmlExt) == OutputFiles(stem + TxtExt, stem + JsonExt, stem + HtmlExt)
  {
    NotContainsMissingChar(stem, HtmlExt, '.');
    CompanionOfStem(stem, TxtExt);
    CompanionOfStem(stem, JsonExt);
  }
}
