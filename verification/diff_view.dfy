/** The pure parts of the diff view (src/views/diff-view.tsx): the `$…$`
    tokenizer handed to `marked`, the "reviewed" checkbox handler, and the two
    texts the view compares. Rendering and the `diff` library are not part of
    this model. */
module DiffView {
  import opened Optional
  import opened Strings
  import opened Frontmatter
  import opened Vault
  import opened FileUtils
  import opened NoteRevisions
  import opened Note
  import opened DiffUtils

  // ---------------------------------------------------------------------------
  // the codespan tokenizer

  /** The token `codespan` returns: `raw` is the matched text and `capture`
      the group, whose trimmed form is the token's `text`. */
  datatype Token = Token(raw: string, capture: string) {
    function Text(): string {
      Trim(capture)
    }
  }

  predicate AllDollars(s: string) {
    forall i :: 0 <= i < |s| ==> s[i] == '$'
  }

  /** Characters the class `[^$\n]` accepts. */
  predicate InnerChar(ch: char) {
    ch != '$' && ch != '\n'
  }

  predicate AllInner(s: string) {
    forall i :: 0 <= i < |s| ==> InnerChar(s[i])
  }

  /** Length of the run of `$` that starts `s`. */
  function DollarRun(s: string): (n: nat)
    ensures n <= |s| && forall i :: 0 <= i < n ==> s[i] == '$'
    ensures n == |s| || s[n] != '$'
    decreases |s|
  {
    if |s| > 0 && s[0] == '$' then 1 + DollarRun(s[1..]) else 0
  }

  /** Length of the run of `[^$\n]` characters that starts `s`. */
  function InnerRun(s: string): (n: nat)
    ensures n <= |s| && forall i :: 0 <= i < n ==> InnerChar(s[i])
    ensures n == |s| || !InnerChar(s[n])
    decreases |s|
  {
    if |s| > 0 && InnerChar(s[0]) then 1 + InnerRun(s[1..]) else 0
  }

  /** The two run lengths are determined by where the run stops. */
  lemma DollarRunOf(d: string, t: string)
    requires AllDollars(d) && (|t| == 0 || t[0] != '$')
    ensures DollarRun(d + t) == |d|
  {
    var s := d + t;
    var n := DollarRun(s);
    assert forall j :: 0 <= j < |d| ==> s[j] == d[j];
    assert |t| > 0 ==> s[|d|] == t[0];
  }

  lemma InnerRunOf(x: string, t: string)
    requires AllInner(x) && (|t| == 0 || !InnerChar(t[0]))
    ensures InnerRun(x + t) == |x|
  {
    var s := x + t;
    var n := InnerRun(s);
    assert forall j :: 0 <= j < |x| ==> s[j] == x[j];
    assert |t| > 0 ==> s[|x|] == t[0];
  }

  /** `codespan(src)` for `/^\$+([^$\n]+?)\$+/`. The leading `$+` can only
      match the whole run, since `[^$\n]` rejects `$`; the lazy capture then
      stops at the first `$`, and the closing `$+` takes the whole run that
      follows. It fails unless `src` starts with `$`, and when a newline or the
      end comes before a closing `$`. */
  function Codespan(src: string): (r: Option<Token>)
    ensures (|src| == 0 || src[0] != '$') ==> r.None?
    ensures r.Some? ==> StartsWith(src, r.value.raw)
  {
    match CodespanRuns(src)
    case None => None
    case Some((l, n, c)) => Some(Token(src[..l + n + c], src[l..l + n]))
  }

  /** The lengths of the opening run, the capture and the closing run. */
  function CodespanRuns(src: string): (r: Option<(nat, nat, nat)>)
    ensures r.Some? ==> 0 < r.value.0 && 0 < r.value.1 && 0 < r.value.2
    ensures r.Some? ==> r.value.0 + r.value.1 + r.value.2 <= |src| && src[0] == '$'
  {
    var l := DollarRun(src);
    if l == 0 then None
    else
      var after := src[l..];
      var n := InnerRun(after);
      if n == 0 || n == |after| || after[n] != '$' then None
      else Some((l, n, DollarRun(after[n..])))
  }

  /** The run lengths once the three runs are known. */
  lemma CodespanRunsOf(src: string, l: nat, n: nat, c: nat)
    requires 0 < l && DollarRun(src) == l
    requires 0 < n && l + n < |src| && InnerRun(src[l..]) == n && src[l + n] == '$'
    requires DollarRun(src[l + n..]) == c
    ensures CodespanRuns(src) == Some((l, n, c))
  {
    var after := src[l..];
    assert after[n] == src[l + n];
    assert after[n..] == src[l + n..];
  }

  /** The token once the run lengths are known. */
  lemma CodespanOfRuns(src: string, l: nat, n: nat, c: nat)
    requires CodespanRuns(src) == Some((l, n, c))
    ensures Codespan(src) == Some(Token(src[..l + n + c], src[l..l + n]))
  {
  }

  /** Where the three runs of a match end. */
  lemma MatchOpenRun(open: string, tail: string)
    requires |open| > 0 && AllDollars(open)
    requires |tail| > 0 && tail[0] != '$'
    ensures DollarRun(open + tail) == |open| && (open + tail)[|open|..] == tail
  {
    DollarRunOf(open, tail);
  }

  lemma MatchInnerRun(inner: string, close: string, rest: string)
    requires |inner| > 0 && AllInner(inner)
    requires |close| > 0 && AllDollars(close)
    requires |rest| == 0 || rest[0] != '$'
    ensures var t := inner + close + rest;
      && InnerRun(t) == |inner| && t[|inner|] == '$'
      && DollarRun(t[|inner|..]) == |close|
  {
    var t := inner + close + rest;
    assert t == inner + (close + rest);
    assert (close + rest)[0] == close[0];
    InnerRunOf(inner, close + rest);
    assert t[|inner|..] == close + rest;
    DollarRunOf(close, rest);
  }

  lemma MatchRuns(open: string, inner: string, close: string, rest: string)
    requires |open| > 0 && AllDollars(open)
    requires |inner| > 0 && AllInner(inner)
    requires |close| > 0 && AllDollars(close)
    requires |rest| == 0 || rest[0] != '$'
    ensures var src := open + inner + close + rest;
      && DollarRun(src) == |open|
      && InnerRun(src[|open|..]) == |inner|
      && src[|open| + |inner|] == '$'
      && DollarRun(src[|open| + |inner|..]) == |close|
  {
    var src := open + inner + close + rest;
    var tail := inner + close + rest;
    assert src == open + tail;
    assert tail[0] == inner[0];
    MatchOpenRun(open, tail);
    MatchInnerRun(inner, close, rest);
    assert src[|open| + |inner|..] == tail[|inner|..];
  }

  lemma MatchRunLengths(open: string, inner: string, close: string, rest: string)
    requires |open| > 0 && AllDollars(open)
    requires |inner| > 0 && AllInner(inner)
    requires |close| > 0 && AllDollars(close)
    requires |rest| == 0 || rest[0] != '$'
    ensures CodespanRuns(open + inner + close + rest) == Some((|open|, |inner|, |close|))
  {
    MatchRuns(open, inner, close, rest);
    CodespanRunsOf(open + inner + close + rest, |open|, |inner|, |close|);
  }

  lemma MatchToken(open: string, inner: string, close: string, rest: string)
    requires var src := open + inner + close + rest;
      Codespan(src) == Some(Token(src[..|open| + |inner| + |close|], src[|open|..|open| + |inner|]))
    ensures Codespan(open + inner + close + rest) == Some(Token(open + inner + close, inner))
  {
    MatchSlices(open, inner, close, rest);
  }

  /** A match: the opening run, a non-empty capture, and the whole closing run
      make up `raw`, and `text` is the trimmed capture. */
  lemma CodespanMatch(open: string, inner: string, close: string, rest: string)
    requires |open| > 0 && AllDollars(open)
    requires |inner| > 0 && AllInner(inner)
    requires |close| > 0 && AllDollars(close)
    requires |rest| == 0 || rest[0] != '$'
    ensures Codespan(open + inner + close + rest) == Some(Token(open + inner + close, inner))
    ensures Codespan(open + inner + close + rest).value.Text() == Trim(inner)
  {
    MatchRunLengths(open, inner, close, rest);
    CodespanOfRuns(open + inner + close + rest, |open|, |inner|, |close|);
    MatchToken(open, inner, close, rest);
  }

  lemma MatchSlices(open: string, inner: string, close: string, rest: string)
    ensures var src := open + inner + close + rest;
      && src[..|open| + |inner| + |close|] == open + inner + close
      && src[|open|..|open| + |inner|] == inner
  {
  }

  /** A newline, or the end of the text, before any closing `$`: no match. */
  lemma CodespanUnclosed(open: string, inner: string, rest: string)
    requires |open| > 0 && AllDollars(open)
    requires AllInner(inner)
    requires |rest| == 0 || rest[0] == '\n'
    ensures Codespan(open + inner + rest).None?
  {
    var src := open + inner + rest;
    assert src == open + (inner + rest);
    if |inner| > 0 {
      assert (inner + rest)[0] == inner[0];
    } else if |rest| > 0 {
      assert (inner + rest)[0] == rest[0];
    }
    DollarRunOf(open, inner + rest);
    assert src[|open|..] == inner + rest;
    InnerRunOf(inner, rest);
  }

  // ---------------------------------------------------------------------------
  // the "reviewed" checkbox

  /** `handleReviewed`: writes the frontmatter the view was rendered with,
      with `reviewed` set to the checkbox state, into the revision file. */
  function HandleReviewed(v: Vault, revisionPath: string, rendered: Frontmatter, checked: bool): (r: Vault)
    ensures |r| == |v|
    ensures forall i :: 0 <= i < |v| && v[i].path != revisionPath ==> r[i] == v[i]
    ensures forall i :: 0 <= i < |v| && v[i].path == revisionPath && UniquePaths(v) ==>
      ReadFrontmatter(r[i]) == Merge(ReadFrontmatter(v[i]), rendered["reviewed" := Bool(checked)])
      && r[i].content == v[i].content
  {
    ModifyFrontmatter(v, revisionPath, rendered["reviewed" := Bool(checked)])
  }

  /** When the revision's frontmatter is still the one the view was rendered
      with, only `reviewed` changes: it now holds the checkbox state, the
      revision stays a revision, and every other key keeps its value. */
  lemma HandleReviewedOnlyReviewed(v: Vault, revisionPath: string, checked: bool, i: nat)
    requires UniquePaths(v) && i < |v| && v[i].path == revisionPath
    ensures var r := HandleReviewed(v, revisionPath, ReadFrontmatter(v[i]), checked);
      var fm := ReadFrontmatter(r[i]);
      && fm == ReadFrontmatter(v[i])["reviewed" := Bool(checked)]
      && CheckIfReviewed(fm) == Bool(checked)
      && CheckIfNoteRevision(r[i])
      && (forall k :: k in ReadFrontmatter(v[i]) && k != "reviewed" ==> k in fm && fm[k] == ReadFrontmatter(v[i])[k])
  {
    MergeSnapshot(ReadFrontmatter(v[i]), "reviewed", Bool(checked));
  }

  // ---------------------------------------------------------------------------
  // the compared texts

  /** `readFileContent(file).content`: the text after the frontmatter block. */
  function ReadFileContent(f: File): string {
    ReadContentWithoutFrontmatter(f.content)
  }

  /** The note's and the revision's texts as the view hands them to the diff:
      each read without frontmatter and ending with a newline. */
  function DiffInputs(note: File, revision: File): (r: (string, string))
    ensures EndsWith(r.0, "\n") && EndsWith(r.1, "\n")
    ensures StartsWith(r.0, ReadFileContent(note)) && |r.0| <= |ReadFileContent(note)| + 1
    ensures StartsWith(r.1, ReadFileContent(revision)) && |r.1| <= |ReadFileContent(revision)| + 1
    ensures r.0 == ReadFileContent(note) <==> EndsWith(ReadFileContent(note), "\n")
    ensures r.1 == ReadFileContent(revision) <==> EndsWith(ReadFileContent(revision), "\n")
  {
    (EnsureNewline(ReadFileContent(note)), EnsureNewline(ReadFileContent(revision)))
  }
}
