/** The earlier diff renderers: `formatDiffContent` in utils/diff-utils.ts and
    `createStyledDiff` in modals/diff-modal.ts. Both keep every line verbatim,
    marker included, in a div; the first drops lines that start with `#`. */
module LegacyDiff {
  import opened Strings
  import opened Seqs
  import opened DiffUtils

  /** One line as a div carrying the whole line. */
  function ClassifyVerbatim(line: string): (e: Element)
    ensures e.tag == Div && e.text == line
    ensures e.cls == InsertClass <==> StartsWith(line, "+")
    ensures e.cls == DeleteClass <==> StartsWith(line, "-")
    ensures e.cls == PlainClass <==> !StartsWith(line, "+") && !StartsWith(line, "-")
  {
    if StartsWith(line, "+") then Element(Div, InsertClass, line)
    else if StartsWith(line, "-") then Element(Div, DeleteClass, line)
    else Element(Div, PlainClass, line)
  }

  function Texts(es: seq<Element>): seq<string> {
    seq(|es|, i requires 0 <= i < |es| => es[i].text)
  }

  /** One div per line, carrying the line, classed by its first character. */
  function VerbatimAll(lines: seq<string>): (es: seq<Element>)
    ensures Texts(es) == lines
    ensures forall i :: 0 <= i < |es| ==> es[i].tag == Div
    ensures forall i :: 0 <= i < |es| ==>
      && (es[i].cls == InsertClass <==> StartsWith(lines[i], "+"))
      && (es[i].cls == DeleteClass <==> StartsWith(lines[i], "-"))
      && (es[i].cls == PlainClass <==> !StartsWith(lines[i], "+") && !StartsWith(lines[i], "-"))
  {
    seq(|lines|, i requires 0 <= i < |lines| => ClassifyVerbatim(lines[i]))
  }

  predicate NotTitleLine(line: string) {
    !StartsWith(line, "#")
  }

  /** The elements of utils/diff-utils.ts: the lines not starting with `#`,
      in order. */
  function LegacyElements(content: string): (es: seq<Element>)
    ensures Texts(es) == Filter(Split(content, '\n'), NotTitleLine)
    ensures forall i :: 0 <= i < |es| ==>
      && es[i].tag == Div
      && (es[i].cls == InsertClass <==> StartsWith(es[i].text, "+"))
      && (es[i].cls == DeleteClass <==> StartsWith(es[i].text, "-"))
      && (es[i].cls == PlainClass <==> !StartsWith(es[i].text, "+") && !StartsWith(es[i].text, "-"))
  {
    VerbatimAll(Filter(Split(content, '\n'), NotTitleLine))
  }

  /** `formatDiffContent(content)` of utils/diff-utils.ts. */
  function LegacyFormatDiffContent(content: string): string {
    RenderAll(LegacyElements(content))
  }

  /** A leading title line is dropped and the rest rendered as before. */
  lemma LegacyDropsTitleLine(title: string, rest: string)
    requires '\n' !in title
    ensures LegacyFormatDiffContent("#" + title + "\n" + rest) == LegacyFormatDiffContent(rest)
  {
    var line := "#" + title;
    assert '\n' !in line by {
      forall i | 0 <= i < |line| ensures line[i] != '\n' {
        if i > 0 { assert line[i] == title[i - 1]; }
      }
    }
    assert "#" + title + "\n" + rest == line + ['\n'] + rest;
    SplitAppend(line, rest, '\n');
    SplitNoSeparator(line, '\n');
    assert line[..1] == "#";
    FilterAppend([line], Split(rest, '\n'), NotTitleLine);
    assert Filter([line], NotTitleLine) == [];
    assert [] + Filter(Split(rest, '\n'), NotTitleLine) == Filter(Split(rest, '\n'), NotTitleLine);
  }

  /** The elements of `createStyledDiff`: one per line, and joining their
      texts with newlines gives back the diff text. */
  function StyledElements(diffText: string): (es: seq<Element>)
    ensures |es| == CountChar(diffText, '\n') + 1
    ensures Join(Texts(es), '\n') == diffText
    ensures forall i :: 0 <= i < |es| ==>
      && es[i].tag == Div
      && (es[i].cls == InsertClass <==> StartsWith(es[i].text, "+"))
      && (es[i].cls == DeleteClass <==> StartsWith(es[i].text, "-"))
      && (es[i].cls == PlainClass <==> !StartsWith(es[i].text, "+") && !StartsWith(es[i].text, "-"))
  {
    SplitCount(diffText, '\n');
    JoinSplit(diffText, '\n');
    VerbatimAll(Split(diffText, '\n'))
  }

  /** `DiffModal.createStyledDiff(diffText)`. */
  function CreateStyledDiff(diffText: string): string {
    RenderAll(StyledElements(diffText))
  }

  /** An empty diff still shows one empty plain line. */
  lemma EmptyStyledDiff()
    ensures CreateStyledDiff("") == "<div class=\"diff-line\"></div>"
  {
    var es := StyledElements("");
    assert |es| == 1;
    assert es[0] == Element(Div, PlainClass, "");
  }
}
