/** Rendering a unified diff as HTML (src/utils/diff-utils.ts). Producing the
    patch itself is the `diff` library's `createPatch`, which is not part of
    this model: `FormatDiffContent` takes the patch text as input. */
module DiffUtils {
  import opened Strings
  import opened Seqs
  import opened MdUtils

  /** `ensureNewline(content)`: appends `\n` unless the text already ends
      with one. */
  function EnsureNewline(content: string): (r: string)
    ensures EndsWith(r, "\n")
    ensures StartsWith(r, content) && |r| <= |content| + 1
    ensures r == content <==> EndsWith(content, "\n")
  {
    if EndsWith(content, "\n") then content
    else
      var r := content + "\n";
      assert r[..|content|] == content;
      r
  }

  lemma EnsureNewlineIdempotent(content: string)
    ensures EnsureNewline(EnsureNewline(content)) == EnsureNewline(content)
  {
  }

  // ---------------------------------------------------------------------------
  // HTML elements

  datatype Tag = P | Div

  /** An element `<tag class="cls">text</tag>`; the text goes in unescaped. */
  datatype Element = Element(tag: Tag, cls: string, text: string)

  const PlainClass := "diff-line"
  const InsertClass := "diff-line diff-insert"
  const DeleteClass := "diff-line diff-delete"

  function TagName(t: Tag): string {
    match t
    case P => "p"
    case Div => "div"
  }

  function Render(e: Element): string {
    "<" + TagName(e.tag) + " class=\"" + e.cls + "\">" + e.text + "</" + TagName(e.tag) + ">"
  }

  /** The `result +=` of a `forEach` over elements. */
  function RenderAll(es: seq<Element>): string
    decreases |es|
  {
    if |es| == 0 then "" else Render(es[0]) + RenderAll(es[1..])
  }

  lemma {:induction false} RenderAllAppend(a: seq<Element>, b: seq<Element>)
    ensures RenderAll(a + b) == RenderAll(a) + RenderAll(b)
    decreases |a|
  {
    if |a| > 0 {
      assert (a + b)[0] == a[0];
      assert (a + b)[1..] == a[1..] + b;
      RenderAllAppend(a[1..], b);
    } else {
      assert a + b == b;
    }
  }

  // ---------------------------------------------------------------------------
  // lines of the patch

  /** Patch metadata and the note's id header: after trimming, the line starts
      with `#`, `@@`, `===`, `Index:`, `--` or `++`. */
  predicate IsHeaderLine(line: string) {
    var t := Trim(line);
    StartsWith(t, "#") || StartsWith(t, "@@") || StartsWith(t, "===")
    || StartsWith(t, "Index:") || StartsWith(t, "--") || StartsWith(t, "++")
  }

  predicate IsBodyLine(line: string) {
    !IsHeaderLine(line)
  }

  /** The line an element was made from. */
  function Unclassify(e: Element): string {
    if e.cls == InsertClass then "+" + e.text
    else if e.cls == DeleteClass then "-" + e.text
    else e.text
  }

  /** One body line: an insertion becomes a paragraph and a deletion a div,
      both without their marker; any other line a plain div, verbatim. No
      information is lost: the line comes back from the element. */
  function Classify(line: string): (e: Element)
    ensures e.tag == P <==> StartsWith(line, "+")
    ensures e.cls == InsertClass <==> StartsWith(line, "+")
    ensures e.cls == DeleteClass <==> StartsWith(line, "-")
    ensures e.cls == PlainClass <==> !StartsWith(line, "+") && !StartsWith(line, "-")
    ensures Unclassify(e) == line
  {
    if StartsWith(line, "+") then
      assert line == [line[0]] + line[1..];
      Element(P, InsertClass, line[1..])
    else if StartsWith(line, "-") then
      assert line == [line[0]] + line[1..];
      Element(Div, DeleteClass, line[1..])
    else Element(Div, PlainClass, line)
  }

  function UnclassifyAll(es: seq<Element>): seq<string> {
    seq(|es|, i requires 0 <= i < |es| => Unclassify(es[i]))
  }

  /** Each line classified in place; the lines come back from the elements. */
  function ClassifyAll(lines: seq<string>): (es: seq<Element>)
    ensures |es| == |lines|
    ensures forall i :: 0 <= i < |lines| ==> es[i] == Classify(lines[i])
    ensures UnclassifyAll(es) == lines
  {
    var es := seq(|lines|, i requires 0 <= i < |lines| => Classify(lines[i]));
    assert forall i :: 0 <= i < |lines| ==> UnclassifyAll(es)[i] == lines[i];
    es
  }

  /** The elements shown for a patch: one per body line, in order. An
      insertion is a paragraph of class `diff-insert` and a deletion a div of
      class `diff-delete`, both without their marker; any other body line is a
      plain div. Each line is recovered from its element. */
  function BodyElements(lines: seq<string>): (es: seq<Element>)
    ensures |es| == |Filter(lines, IsBodyLine)|
    ensures forall i :: 0 <= i < |es| ==>
      var line := Filter(lines, IsBodyLine)[i];
      && (es[i].tag == P <==> StartsWith(line, "+"))
      && (es[i].cls == InsertClass <==> StartsWith(line, "+"))
      && (es[i].cls == DeleteClass <==> StartsWith(line, "-"))
      && (es[i].cls == PlainClass <==> !StartsWith(line, "+") && !StartsWith(line, "-"))
    ensures UnclassifyAll(es) == Filter(lines, IsBodyLine)
  {
    var body := Filter(lines, IsBodyLine);
    ClassifyAll(body)
  }

  // ---------------------------------------------------------------------------
  // title

  /** The file name on the first line as written: the words after the first,
      but only up to index `lines.length` (`indexTitle.slice(1,
      diffLines.length)`), so a first line with more words than the patch has
      lines loses its tail. */
  function FileNameAsWritten(lines: seq<string>): string
    requires |lines| >= 1
  {
    var words := Split(lines[0], ' ');
    var e := if |lines| < |words| then |lines| else |words|;
    Join(words[1..e], ' ')
  }

  /** The file name on the first line: all words after the first. */
  function FileName(lines: seq<string>): string
    requires |lines| >= 1
  {
    var words := Split(lines[0], ' ');
    Join(words[1..], ' ')
  }

  /** The two agree whenever the patch has at least as many lines as its first
      line has words, which holds for the patches `createPatch` produces. */
  lemma FileNameAgrees(lines: seq<string>)
    requires |lines| >= 1 && |lines| >= |Split(lines[0], ' ')|
    ensures FileNameAsWritten(lines) == FileName(lines)
  {
    var words := Split(lines[0], ' ');
    assert words[1..|words|] == words[1..];
  }

  /** The words of an `Index:` line: the marker, then the file name's words. */
  lemma IndexLineWords(name: string)
    ensures Split("Index: " + name, ' ') == ["Index:"] + Split(name, ' ')
  {
    assert "Index: " + name == "Index:" + [' '] + name;
    SplitAppend("Index:", name, ' ');
    SplitNoSeparator("Index:", ' ');
  }

  /** A one-line input whose file name has a space, such as
      `Index: my note.md`: the name is cut off entirely. */
  lemma FileNameAsWrittenTruncates(x: string, y: string)
    ensures FileName(["Index: " + x + " " + y]) == x + " " + y
    ensures FileNameAsWritten(["Index: " + x + " " + y]) == ""
  {
    var name := x + " " + y;
    var lines := ["Index: " + name];
    assert lines[0] == "Index: " + x + " " + y;
    IndexLineWords(name);
    assert name == x + [' '] + y;
    SplitAppend(x, y, ' ');
    var words := Split(lines[0], ' ');
    assert |words| >= 3;
    assert words[1..1] == [];
    assert words[1..] == Split(name, ' ');
    JoinSplit(name, ' ');
  }

  /** The whole file name of an `Index:` line comes back, whatever the
      number of lines. */
  lemma FileNameOfIndexLine(name: string, more: seq<string>)
    ensures FileName(["Index: " + name] + more) == name
  {
    var lines := ["Index: " + name] + more;
    assert lines[0] == "Index: " + name;
    IndexLineWords(name);
    var words := Split(lines[0], ' ');
    assert words[1..] == Split(name, ' ');
    JoinSplit(name, ' ');
  }

  /** The heading: the file name without its extension. */
  function Title(lines: seq<string>): string
    requires |lines| >= 1
  {
    DropLastSegment(FileName(lines), '.')
  }

  /** For a patch that starts with `Index: <base>.<ext>`, the title is `base`. */
  lemma IndexLineTitle(base: string, ext: string, rest: string)
    requires '\n' !in base && '\n' !in ext && '.' !in ext
    ensures Title(Split("Index: " + base + "." + ext + "\n" + rest, '\n')) == base
  {
    var name := base + "." + ext;
    var line := "Index: " + name;
    assert '\n' !in line by {
      forall i | 0 <= i < |line| ensures line[i] != '\n' {
        if i >= 7 + |base| + 1 { assert line[i] == ext[i - 8 - |base|]; }
        else if i >= 7 && i < 7 + |base| { assert line[i] == base[i - 7]; }
      }
    }
    assert "Index: " + base + "." + ext + "\n" + rest == line + ['\n'] + rest;
    SplitAppend(line, rest, '\n');
    SplitNoSeparator(line, '\n');
    IndexLineWords(name);
    JoinSplit(name, ' ');
    assert name == base + ['.'] + ext;
    DropLastSegmentAppend(base, ext, '.');
  }

  // ---------------------------------------------------------------------------
  // the rendered diff

  /** `formatDiffContent(app, content)`: wiki links become anchors first; then
      a heading with the title and the body lines' elements. */
  function FormatDiffContent(vaultName: string, content: string): (r: string)
    ensures var lines := Split(TransformLinks(vaultName, content), '\n');
      StartsWith(r, "<h2>" + Title(lines) + "</h2>") && EndsWith(r, RenderAll(BodyElements(lines)))
    ensures var lines := Split(TransformLinks(vaultName, content), '\n');
      |r| == |"<h2>" + Title(lines) + "</h2>"| + |RenderAll(BodyElements(lines))|
  {
    var lines := Split(TransformLinks(vaultName, content), '\n');
    var heading := "<h2>" + Title(lines) + "</h2>";
    var r := heading + RenderAll(BodyElements(lines));
    assert r[..|heading|] == heading;
    r
  }

  /** `formatDiffContent(app, content)` as written: the heading's file name is
      cut at the patch's line count, as in `FileNameAsWritten`. */
  function FormatDiffContentAsWritten(vaultName: string, content: string): (r: string)
    ensures var lines := Split(TransformLinks(vaultName, content), '\n');
      StartsWith(r, "<h2>" + DropLastSegment(FileNameAsWritten(lines), '.') + "</h2>")
      && EndsWith(r, RenderAll(BodyElements(lines)))
    ensures var lines := Split(TransformLinks(vaultName, content), '\n');
      |r| == |"<h2>" + DropLastSegment(FileNameAsWritten(lines), '.') + "</h2>"| + |RenderAll(BodyElements(lines))|
  {
    var lines := Split(TransformLinks(vaultName, content), '\n');
    var heading := "<h2>" + DropLastSegment(FileNameAsWritten(lines), '.') + "</h2>";
    var r := heading + RenderAll(BodyElements(lines));
    assert r[..|heading|] == heading;
    r
  }

  /** The as-written rendering and the corrected one are the same whenever the
      patch has at least as many lines as its first line has words. */
  lemma FormatDiffContentAgrees(vaultName: string, content: string)
    requires var lines := Split(TransformLinks(vaultName, content), '\n');
      |lines| >= |Split(lines[0], ' ')|
    ensures FormatDiffContentAsWritten(vaultName, content) == FormatDiffContent(vaultName, content)
  {
    FileNameAgrees(Split(TransformLinks(vaultName, content), '\n'));
  }

  /** A link-free patch for one file: the heading is the file's base name and
      the body lines of the patch are rendered, the `Index:` line among the
      dropped headers. */
  lemma FormatPatch(vaultName: string, base: string, ext: string, rest: string)
    requires '\n' !in base && '\n' !in ext && '.' !in ext
    requires NoLinks("Index: " + base + "." + ext + "\n" + rest)
    ensures var content := "Index: " + base + "." + ext + "\n" + rest;
      FormatDiffContent(vaultName, content)
        == "<h2>" + base + "</h2>" + RenderAll(BodyElements(Split(content, '\n')))
  {
    var content := "Index: " + base + "." + ext + "\n" + rest;
    TransformIdentity(vaultName, content);
    IndexLineTitle(base, ext, rest);
  }

  /** Header lines contribute nothing to the body. */
  lemma HeaderLinesDropped(lines: seq<string>)
    requires forall i :: 0 <= i < |lines| ==> IsHeaderLine(lines[i])
    ensures RenderAll(BodyElements(lines)) == ""
  {
  }
}
